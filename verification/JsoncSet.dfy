/** `jsonc_set` as an edit of the document: one value replaced, or one member appended. */
module JsoncSet {
  import opened Options
  import opened Text
  import opened JsoncScanner
  import opened JsoncDoc
  import opened JsoncGaps
  import opened JsoncSplice
  import opened JsonDump
  import opened JsoncEdit

  // ----- Places in the text of a document -----

  /** The offsets of entry `i`, read off the document. */
  lemma SpanAt(d: Doc, i: nat)
    requires i < |d.entries| && Place(d, i)
    ensures SpansOf(d).members[i] == MemberOf(d.entries[i], |Stem(d, i)| + |GapAt(d, i)|)
  {
    hide EntriesThen, EntryThen, Stem, GapAt, EntriesLen;
    MembersAt(d, i);
    assert d.entries[i..][0] == d.entries[i];
  }

  lemma EntrySpan(d: Doc, i: nat, loads: KeyReader)
    requires WellFormed(d, loads) && i < |d.entries|
    ensures Place(d, i)
    ensures SpansOf(d).members[i] == MemberOf(d.entries[i], |Stem(d, i)| + |GapAt(d, i)|)
  {
    hide EntriesThen, EntryThen, Stem, GapAt, WellFormedEntry, EntriesLen, SpansOf;
    SpanAt(d, i);
  }

  function HeadText(e: Entry): (s: string)
    ensures |s| == HeadLen(e)
  {
    e.literal + (e.preColon + (":" + e.postColon))
  }

  lemma EntryParts(e: Entry, r: string)
    ensures EntryThen(e, r) == HeadText(e) + (e.value + TailThen(e, r))
  {
    var x := e.value + TailThen(e, r);
    Assoc(":", e.postColon, x);
    Assoc(e.preColon, ":" + e.postColon, x);
    Assoc(e.literal, e.preColon + (":" + e.postColon), x);
  }

  /** The text around the value of entry `i`. */
  lemma ValueTextAt(d: Doc, i: nat)
    requires i < |d.entries| && Place(d, i)
    ensures var e, m := d.entries[i], SpansOf(d).members[i];
            var tail := TailThen(e, Back(d.entries[i + 1..], d.post));
            && 0 <= m.valueStart <= m.valueEnd <= |DocText(d)|
            && DocText(d)[..m.valueStart] == Stem(d, i) + (GapAt(d, i) + HeadText(e))
            && DocText(d)[m.valueStart..m.valueEnd] == e.value
            && DocText(d)[m.valueEnd..] == tail
            && DocText(d) == Stem(d, i) + (GapAt(d, i) + (HeadText(e) + (e.value + tail)))
  {
    hide Stem, GapAt, TailThen, HeadText, EntryThen, MembersOf, DocText, EntriesLen;
    SpanAt(d, i);
    TextAt(d, i);
    var e := d.entries[i];
    BackCons(d.entries, i, d.post);
    var tail := TailThen(e, Back(d.entries[i + 1..], d.post));
    EntryParts(e, Back(d.entries[i + 1..], d.post));
    CutThree(Stem(d, i), GapAt(d, i), HeadText(e), e.value + tail);
    CutMiddle(DocText(d), |Stem(d, i)| + |GapAt(d, i)| + |HeadText(e)|, e.value, tail);
  }

  lemma TextAroundValue(d: Doc, i: nat, loads: KeyReader)
    requires WellFormed(d, loads) && i < |d.entries|
    ensures Place(d, i)
    ensures var e, m := d.entries[i], SpansOf(d).members[i];
            var tail := TailThen(e, Back(d.entries[i + 1..], d.post));
            && 0 <= m.valueStart <= m.valueEnd <= |DocText(d)|
            && DocText(d)[..m.valueStart] == Stem(d, i) + (GapAt(d, i) + HeadText(e))
            && DocText(d)[m.valueStart..m.valueEnd] == e.value
            && DocText(d)[m.valueEnd..] == tail
            && DocText(d) == Stem(d, i) + (GapAt(d, i) + (HeadText(e) + (e.value + tail)))
  {
    hide Stem, GapAt, TailThen, HeadText, EntryThen, WellFormedEntry, SpansOf, DocText;
    ValueTextAt(d, i);
  }

  lemma CutMiddle(s: string, k: nat, v: string, r: string)
    requires k <= |s| && s[k..] == v + r
    ensures k + |v| <= |s| && s[k..k + |v|] == v && s[k + |v|..] == r
  {
    Cut(v, r);
    Drops(s, k, |v|);
    assert s[k..k + |v|] == s[k..][..|v|];
  }

  lemma BackCons(es: seq<Entry>, i: nat, post: string)
    requires i < |es|
    ensures Back(es[i..], post) == EntryThen(es[i], Back(es[i + 1..], post))
  {
    assert es[i..] == [es[i]] + es[i + 1..];
    ConsText(es[i], es[i + 1..], "}" + post);
  }

  // ----- Indentation -----

  /** The start of the line that ends a gap, when that gap has a line break. */
  lemma LineInGap(a: string, g: string, r: string)
    requires a != [] && a[|a| - 1] != '\n'
    ensures var k, ls := LineStart(g, |g|), LineStart(a + (g + r), |a| + |g|);
            if k > 0 then ls == |a| + k else ls < |a|
  {
    var t := a + (g + r);
    var k := LineStart(g, |g|);
    assert forall j :: 0 <= j < |g| ==> t[|a| + j] == g[j];
    if k > 0 {
      LineStartUnique(t, |a| + |g|, |a| + k);
    } else {
      assert t[|a| - 1] == a[|a| - 1];
    }
  }

  /** The indentation the editor copies is JSON white space without a line break. */
  lemma IndentIsWs(d: Doc, i: nat, loads: KeyReader)
    requires WellFormed(d, loads) && i < |d.entries|
    ensures Place(d, i)
    ensures var t, k := DocText(d), SpansOf(d).members[i].keyStart;
            0 <= k <= |t| && AllWs(IndentOf(t, k)) && '\n' !in IndentOf(t, k)
  {
    hide Stem, GapAt, WellFormedEntry, EntriesThen, DocText, IndentOf, IsGap, MembersOf;
    EntrySpan(d, i, loads);
    TextAt(d, i);
    GapAtIsGap(d, i, loads);
    StemEnd(d, i);
    IndentAt(Stem(d, i), GapAt(d, i), Back(d.entries[i..], d.post));
  }

  lemma GapAtIsGap(d: Doc, i: nat, loads: KeyReader)
    requires WellFormed(d, loads) && Place(d, i)
    ensures IsGap(GapAt(d, i))
  {
    if i > 0 {
      assert WellFormedEntry(d.entries[i - 1], loads);
    }
  }

  lemma TailOf(a: string, g: string, r: string, k: nat)
    requires k <= |g|
    ensures (a + (g + r))[|a| + k..|a| + |g|] == g[k..]
  {
  }

  lemma NoBreak(g: string, k: nat)
    requires k <= |g| && forall j :: k <= j < |g| ==> g[j] != '\n'
    ensures '\n' !in g[k..]
  {
  }

  /** A line that reaches back to a brace or comma is not blank. */
  lemma DarkPrefix(a: string, g: string, r: string, ls: nat)
    requires ls < |a| && (a[|a| - 1] == '{' || a[|a| - 1] == ',')
    ensures !Blank((a + (g + r))[ls..|a| + |g|])
  {
    var prefix := (a + (g + r))[ls..|a| + |g|];
    assert prefix[|a| - 1 - ls] == a[|a| - 1];
    assert prefix[|a| - 1 - ls] in prefix;
  }

  lemma IndentAt(a: string, g: string, r: string)
    requires a != [] && (a[|a| - 1] == '{' || a[|a| - 1] == ',') && IsGap(g)
    ensures var p := IndentOf(a + (g + r), |a| + |g|); AllWs(p) && '\n' !in p
  {
    hide IsGap, LineStart;
    var k := LineStart(g, |g|);
    LineInGap(a, g, r);
    var ls := LineStart(a + (g + r), |a| + |g|);
    if k > 0 {
      TailOf(a, g, r, k);
      NoBreak(g, k);
      if Blank(g[k..]) {
        BlankIsWs(g, k);
      }
    } else {
      DarkPrefix(a, g, r, ls);
    }
  }

  lemma PadIsWs(d: Doc, key: string, loads: KeyReader)
    requires WellFormed(d, loads) && Within(DocText(d), SpansOf(d))
    ensures var pad := PadFor(DocText(d), SpansOf(d), key); AllWs(pad) && '\n' !in pad
  {
    hide IndentOf;
    var p := SpansOf(d);
    var i := IndexOfKey(p.members, key);
    if i < |p.members| {
      IndentIsWs(d, i, loads);
    } else if p.members != [] {
      IndentIsWs(d, |p.members| - 1, loads);
    }
  }

  // ----- Replacing a value -----

  function ReplaceDoc(d: Doc, i: nat, x: string): Doc
    requires i < |d.entries| && Place(d, i)
  {
    Splice(d, i, GapAt(d, i), [d.entries[i].(value := x)] + d.entries[i + 1..])
  }

  lemma ReplaceText(d: Doc, i: nat, x: string, loads: KeyReader)
    requires WellFormed(d, loads) && i < |d.entries|
    ensures Place(d, i)
    ensures var t, m := DocText(d), SpansOf(d).members[i];
            && 0 <= m.valueStart <= m.valueEnd <= |t|
            && t[..m.valueStart] + x + t[m.valueEnd..] == DocText(ReplaceDoc(d, i, x))
  {
    hide Stem, GapAt, TailThen, HeadText, EntryThen, DocText, MembersOf, WellFormedEntry;
    TextAroundValue(d, i, loads);
    var e := d.entries[i];
    var e' := e.(value := x);
    var rest := Back(d.entries[i + 1..], d.post);
    var a, g, h, tail := Stem(d, i), GapAt(d, i), HeadText(e), TailThen(e, rest);
    SplicedText(d, i, g, [e'] + d.entries[i + 1..]);
    ConsText(e', d.entries[i + 1..], "}" + d.post);
    EntryParts(e', rest);
    SameHeadAndTail(e, x, rest);
    Assoc(a + (g + h), x, tail);
    Assoc(a, g + h, x + tail);
    Assoc(g, h, x + tail);
  }

  lemma SameHeadAndTail(e: Entry, x: string, r: string)
    ensures HeadText(e.(value := x)) == HeadText(e) && TailThen(e.(value := x), r) == TailThen(e, r)
  {
  }

  /** The members after replacing the value of member `i` by `x`, `k` being the change of length. */
  function Replaced(p: Parsed, i: nat, x: string, k: int): Parsed
    requires i < |p.members|
  {
    var m := p.members[i];
    Parsed(p.open, p.close + k,
           p.members[..i] + [m.(valueEnd := m.valueStart + |x|)] + Shift(p.members[i + 1..], k))
  }

  lemma ReplaceSpans(d: Doc, i: nat, x: string, loads: KeyReader)
    requires WellFormed(d, loads) && i < |d.entries|
    ensures Place(d, i)
    ensures SpansOf(ReplaceDoc(d, i, x)) == Replaced(SpansOf(d), i, x, |x| - |d.entries[i].value|)
  {
    hide Stem, GapAt, WellFormedEntry, EntryThen, EntriesThen, MembersOf, EntriesLen;
    EntrySpan(d, i, loads);
    var e, es := d.entries[i], d.entries[i + 1..];
    var e' := e.(value := x);
    var at := |Stem(d, i)| + |GapAt(d, i)|;
    SplicedSpans(d, i, GapAt(d, i), [e'] + es);
    ConsMembers(e', es, at);
    MembersAt(d, i);
    assert d.entries[i..] == [e] + es;
    ConsMembers(e, es, at);
    ShiftMembers(es, at + EntryLen(e), at + EntryLen(e'));
    assert SpansOf(d).members[i + 1..] == MembersOf(es, at + EntryLen(e)) by {
      assert SpansOf(d).members[i..] == MembersOf(d.entries[i..], at);
    }
  }

  lemma ConsMembers(e: Entry, es: seq<Entry>, at: nat)
    ensures MembersOf([e] + es, at) == [MemberOf(e, at)] + MembersOf(es, at + EntryLen(e))
    ensures EntriesLen([e] + es) == EntryLen(e) + EntriesLen(es)
  {
    assert ([e] + es)[1..] == es;
  }

  lemma ReplaceWellFormed(d: Doc, i: nat, x: string, loads: KeyReader)
    requires WellFormed(d, loads) && i < |d.entries| && IsValue(x)
    ensures Place(d, i)
    ensures !Swallows(x, d.entries[i].postValue) ==> WellFormed(ReplaceDoc(d, i, x), loads)
  {
    var e := d.entries[i];
    assert WellFormedEntry(e, loads);
    if !Swallows(x, e.postValue) {
      GapAtIsGap(d, i, loads);
      ConsWellFormed(e.(value := x), d.entries[i + 1..], loads);
      SplicedWellFormed(d, i, GapAt(d, i), [e.(value := x)] + d.entries[i + 1..], loads);
    }
  }

  /** A scalar in front of a byte order mark does not end there, so no parse has its value end there. */
  lemma SwallowedValue(t: string, loads: KeyReader, i: nat)
    requires ParseMembers(t, loads).Ok? && i < |ParseMembers(t, loads).value.members|
    ensures var m := ParseMembers(t, loads).value.members[i];
            0 <= m.valueStart < m.valueEnd < |t|
            && (IsScalar(t[m.valueStart..m.valueEnd]) ==> t[m.valueEnd] != BOM)
  {
    var d := ReadIsWritten(t, loads);
    TextAroundValue(d, i, loads);
    var e := d.entries[i];
    assert WellFormedEntry(e, loads);
    BackStarts(d.entries[i + 1..], d.post);
    TailStarts(e, Back(d.entries[i + 1..], d.post));
  }

  lemma BackStarts(es: seq<Entry>, post: string)
    ensures Back(es, post) != [] && (es == [] ==> Back(es, post)[0] == '}')
  {
  }

  lemma TailStarts(e: Entry, r: string)
    requires r != []
    ensures var s := TailThen(e, r);
            s != [] && s[0] == if e.postValue != [] then e.postValue[0] else if e.comma.Some? then ',' else r[0]
  {
  }
}
